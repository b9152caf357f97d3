/** The Coffin hash: the byte loop, and the two loops that prefetch four bytes as one word. */
module Coffin {
  import opened Arithmetic
  import opened CStrings
  import opened Registers

  function Step(h: bv32, b: bv8): bv32 {
    ((h ^ (b as bv32)) << 5) | ((h ^ (b as bv32)) >> 27)
  }

  function Fold(h: bv32, s: seq<bv8>): bv32
    decreases |s|
  {
    if s == [] then h else Fold(Step(h, s[0]), s[1..])
  }

  const SEED: bv32 := 0x55555555

  /** The hash of a byte string. */
  function Hash(s: seq<bv8>): bv32 { Fold(SEED, s) }

  lemma {:induction false} FoldSplit(h: bv32, s: seq<bv8>, n: nat)
    requires n <= |s|
    ensures Fold(h, s) == Fold(Fold(h, s[..n]), s[n..])
    decreases n
  {
    if n == 0 {
      assert s[..0] == [] && s[0..] == s;
    } else {
      assert s[..n][1..] == s[1..][..n - 1] && s[1..][n - 1..] == s[n..];
      FoldSplit(Step(h, s[0]), s[1..], n - 1);
    }
  }

  method HashCoffin(str: seq<bv8>) returns (result: bv32)
    requires Terminated(str)
    ensures result == Hash(CString(str))
  {
    result := SEED;
    var i := 0;
    while str[i] != 0
      invariant i <= Strlen(str)
      invariant Fold(result, CString(str)[i..]) == Hash(CString(str))
      decreases Strlen(str) - i
    {
      ghost var rest := CString(str)[i..];
      assert rest[0] == str[i] && rest[1..] == CString(str)[i + 1..];
      result := Step(result, str[i]);
      i := i + 1;
    }
    assert CString(str)[i..] == [];
  }

  // ---------- word loads ----------

  lemma FoldFour(h: bv32, b: seq<bv8>)
    requires |b| == 4
    ensures Fold(h, b) == Step(Step(Step(Step(h, b[0]), b[1]), b[2]), b[3])
  {
    calc {
      Fold(h, b);
      Fold(Step(h, b[0]), b[1..]);
      { assert b[1..][0] == b[1] && b[1..][1..] == b[2..]; }
      Fold(Step(Step(h, b[0]), b[1]), b[2..]);
      { assert b[2..][0] == b[2] && b[2..][1..] == b[3..]; }
      Fold(Step(Step(Step(h, b[0]), b[1]), b[2]), b[3..]);
      { assert b[3..][0] == b[3] && b[3..][1..] == []; }
      Fold(Step(Step(Step(Step(h, b[0]), b[1]), b[2]), b[3]), []);
      Step(Step(Step(Step(h, b[0]), b[1]), b[2]), b[3]);
    }
  }

  lemma WordLE(h: bv32, b: seq<bv8>)
    requires |b| == 4
    ensures var v := LoadLE(b);
            Step(Step(Step(Step(h, Lane0(v)), Lane1(v)), Lane2(v)), Lane3(v)) == Fold(h, b)
  {
    LanesLE(b);
    FoldFour(h, b);
  }

  lemma WordBE(h: bv32, b: seq<bv8>)
    requires |b| == 4
    ensures var v := LoadBE(b);
            Step(Step(Step(Step(h, Lane3(v)), Lane2(v)), Lane1(v)), Lane0(v)) == Fold(h, b)
  {
    LanesBE(b);
    FoldFour(h, b);
  }

  /** The bytes the word loops read: the next multiple of four, and at least four. */
  function Room(len: nat): nat {
    if len == 0 then 4 else 4 * ((len + 3) / 4)
  }

  lemma RoomCovers(len: nat, at: nat)
    ensures len <= Room(len) && 4 <= Room(len)
    ensures at % 4 == 0 && at + 4 < len ==> at + 8 <= Room(len)
  {
    if at % 4 == 0 && at + 4 < len {
      var q := at / 4;
      assert at == 4 * q;
    }
  }

  lemma NextWord(h: bv32, str: seq<bv8>, at: nat, len: nat)
    requires at + 4 < len <= |str|
    ensures Fold(Fold(h, str[at..at + 4]), str[at + 4..len]) == Fold(h, str[at..len])
  {
    FoldSplit(h, str[at..len], 4);
    assert str[at..len][..4] == str[at..at + 4] && str[at..len][4..] == str[at + 4..len];
  }

  method HashCoffin32Le(str: seq<bv8>, len: nat) returns (result: bv32)
    requires |str| >= Room(len)
    ensures result == Hash(str[..len])
  {
    RoomCovers(len, 0);
    result := SEED;
    var n := len;
    var at := 0;
    var val := LoadLE(str[0..4]);
    while n > 4
      invariant 0 <= n && at + n == len && at % 4 == 0 && at + 4 <= Room(len)
      invariant val == LoadLE(str[at..at + 4])
      invariant Fold(result, str[at..len]) == Hash(str[..len])
    {
      RoomCovers(len, at);
      WordLE(result, str[at..at + 4]);
      NextWord(result, str, at, len);
      at := at + 4;
      n := n - 4;
      result := Step(result, Lane0(val));
      result := Step(result, Lane1(val));
      result := Step(result, Lane2(val));
      var last := Lane3(val);
      val := LoadLE(str[at..at + 4]);
      result := Step(result, last);
    }
    result := Rest(str, at, len, result);
  }

  method HashCoffin32Be(str: seq<bv8>, len: nat) returns (result: bv32)
    requires |str| >= Room(len)
    ensures result == Hash(str[..len])
  {
    RoomCovers(len, 0);
    result := SEED;
    var n := len;
    var at := 0;
    var val := LoadBE(str[0..4]);
    while n > 4
      invariant 0 <= n && at + n == len && at % 4 == 0 && at + 4 <= Room(len)
      invariant val == LoadBE(str[at..at + 4])
      invariant Fold(result, str[at..len]) == Hash(str[..len])
    {
      RoomCovers(len, at);
      WordBE(result, str[at..at + 4]);
      NextWord(result, str, at, len);
      at := at + 4;
      n := n - 4;
      result := Step(result, Lane3(val));
      result := Step(result, Lane2(val));
      result := Step(result, Lane1(val));
      var last := Lane0(val);
      val := LoadBE(str[at..at + 4]);
      result := Step(result, last);
    }
    result := Rest(str, at, len, result);
  }

  /** The last one to four bytes, one at a time from the buffer. */
  method Rest(str: seq<bv8>, start: nat, len: nat, h: bv32) returns (result: bv32)
    requires start <= len <= |str|
    ensures result == Fold(h, str[start..len])
  {
    result := h;
    var at := start;
    while at < len
      invariant start <= at <= len
      invariant Fold(result, str[at..len]) == Fold(h, str[start..len])
    {
      assert str[at..len][1..] == str[at + 1..len];
      result := Step(result, str[at]);
      at := at + 1;
    }
  }

  // ---------- what a step computes ----------

  function Turn(x: bv32): bv32 { (x << 5) | (x >> 27) }

  function Unturn(x: bv32): bv32 { (x >> 5) | (x << 27) }

  lemma StepTurns(h: bv32, b: bv8)
    ensures Step(h, b) == Turn(Xor(h, b as bv32))
  {
  }

  lemma TurnInverse(x: bv32)
    ensures Unturn(Turn(x)) == x && Turn(Unturn(x)) == x
  {
    calc { Unturn(Turn(x)); Unturn((x << 5) | (x >> 27)); x; }
    calc { Turn(Unturn(x)); Turn((x >> 5) | (x << 27)); x; }
  }

  lemma TurnIs(x: bv32)
    ensures Turn(x) == (x << 5) | (x >> 27)
  {
  }

  lemma TurnValue(x: bv32)
    ensures ((x << 5) | (x >> 27)) as nat + 0xffff_ffff * ((x >> 27) as nat) == 32 * (x as nat)
  {
  }

  lemma RawFull(x: bv32)
    ensures Turn(x) == 0xffff_ffff <==> x == 0xffff_ffff
  {
  }

  /** As a number a step is multiplication by 32 modulo 2^32 - 1, the residue 0 standing for itself or, only
      for h ^ b of all ones, for all ones. */
  lemma StepMultiplies(h: bv32, b: bv8)
    ensures (Step(h, b) as nat) % 0xffff_ffff == (32 * (Xor(h, b as bv32) as nat)) % 0xffff_ffff
    ensures Step(h, b) == 0xffff_ffff <==> Xor(h, b as bv32) == 0xffff_ffff
  {
    hide Step, Xor, Turn;
    var x := Xor(h, b as bv32);
    StepTurns(h, b);
    TurnModulo(x);
    RawFull(x);
  }

  lemma TurnModulo(x: bv32)
    ensures (Turn(x) as nat) % 0xffff_ffff == (32 * (x as nat)) % 0xffff_ffff
  {
    hide Turn;
    TurnIs(x);
    TurnValue(x);
    TurnSum(Turn(x) as nat, (x >> 27) as nat, x as nat);
  }

  lemma TurnSum(t: nat, high: nat, x: nat)
    requires t + 0xffff_ffff * high == 32 * x
    ensures t % 0xffff_ffff == (32 * x) % 0xffff_ffff
  {
    ModAdd(0xffff_ffff, high, t);
  }

  /** For a fixed byte a step is a bijection of the state. */
  function Unstep(h: bv32, b: bv8): bv32 { Xor(Unturn(h), b as bv32) }

  lemma StepInverse(h: bv32, b: bv8)
    ensures Unstep(Step(h, b), b) == h && Step(Unstep(h, b), b) == h
  {
    hide Step, Turn, Unturn, Xor;
    StepTurns(h, b);
    TurnInverse(Xor(h, b as bv32));
    XorInverse(h, b as bv32);
    StepTurns(Unstep(h, b), b);
    XorInverse(Unturn(h), b as bv32);
    TurnInverse(h);
  }

  lemma {:induction false} FoldInjective(g: bv32, h: bv32, s: seq<bv8>)
    requires Fold(g, s) == Fold(h, s)
    ensures g == h
    decreases |s|
  {
    hide Step;
    if s != [] {
      FoldInjective(Step(g, s[0]), Step(h, s[0]), s[1..]);
      StepInverse(g, s[0]);
      StepInverse(h, s[0]);
    }
  }

  lemma StepShowsByte(h: bv32, a: bv8, b: bv8)
    requires Step(h, a) == Step(h, b)
    ensures a == b
  {
    hide Step, Turn, Unturn, Xor;
    StepTurns(h, a);
    StepTurns(h, b);
    TurnInverse(Xor(h, a as bv32));
    TurnInverse(Xor(h, b as bv32));
    XorSwap(h, a as bv32);
    XorSwap(h, b as bv32);
    XorInverse(a as bv32, h);
    XorInverse(b as bv32, h);
    RawBytes(a, b);
  }

  lemma RawBytes(a: bv8, b: bv8)
    requires a as bv32 == b as bv32
    ensures a == b
  {
  }

  lemma HashSplit(p: seq<bv8>, m: seq<bv8>, q: seq<bv8>)
    ensures Hash(p + m + q) == Fold(Fold(Fold(SEED, p), m), q)
  {
    var s := p + m + q;
    FoldSplit(SEED, s, |p|);
    assert s[..|p|] == p && s[|p|..] == m + q;
    FoldSplit(Fold(SEED, p), m + q, |m|);
    assert (m + q)[..|m|] == m && (m + q)[|m|..] == q;
  }

  /** Strings of equal length that differ in one byte never collide. */
  lemma OneByteNeverCollides(p: seq<bv8>, a: bv8, b: bv8, q: seq<bv8>)
    requires a != b
    ensures Hash(p + [a] + q) != Hash(p + [b] + q)
  {
    hide Step;
    HashSplit(p, [a], q);
    HashSplit(p, [b], q);
    FoldOne(Fold(SEED, p), a);
    FoldOne(Fold(SEED, p), b);
    if Hash(p + [a] + q) == Hash(p + [b] + q) {
      FoldInjective(Step(Fold(SEED, p), a), Step(Fold(SEED, p), b), q);
      StepShowsByte(Fold(SEED, p), a, b);
    }
  }

  lemma FoldOne(h: bv32, a: bv8)
    ensures Fold(h, [a]) == Step(h, a)
  {
    assert [a][1..] == [];
  }

  lemma FoldTwo(h: bv32, a: bv8, b: bv8)
    ensures Fold(h, [a, b]) == Step(Step(h, a), b)
  {
    assert [a, b][1..] == [b];
    FoldOne(Step(h, a), b);
  }

  function TurnXor(h: bv32, a: bv8, b: bv8): bv32 {
    (((h ^ (a as bv32)) << 5) | ((h ^ (a as bv32)) >> 27)) ^ (b as bv32)
  }

  lemma RawOrder(h: bv32, a: bv8, b: bv8)
    requires TurnXor(h, a, b) == TurnXor(h, b, a)
    ensures a == b
  {
  }

  /** Swapping two different neighbouring bytes always changes the hash. */
  lemma OrderMatters(p: seq<bv8>, a: bv8, b: bv8, q: seq<bv8>)
    requires a != b
    ensures Hash(p + [a, b] + q) != Hash(p + [b, a] + q)
  {
    hide Step;
    var h := Fold(SEED, p);
    HashSplit(p, [a, b], q);
    HashSplit(p, [b, a], q);
    FoldTwo(h, a, b);
    FoldTwo(h, b, a);
    if Hash(p + [a, b] + q) == Hash(p + [b, a] + q) {
      FoldInjective(Step(Step(h, a), b), Step(Step(h, b), a), q);
      StepOrder(h, a, b);
    }
  }

  lemma StepOrder(h: bv32, a: bv8, b: bv8)
    requires Step(Step(h, a), b) == Step(Step(h, b), a)
    ensures a == b
  {
    hide Step, Turn, Unturn, Xor;
    StepTurns(Step(h, a), b);
    StepTurns(Step(h, b), a);
    TurnInverse(Xor(Step(h, a), b as bv32));
    TurnInverse(Xor(Step(h, b), a as bv32));
    XorOrder(h, a, b);
  }

  lemma XorOrder(h: bv32, a: bv8, b: bv8)
    requires Xor(Step(h, a), b as bv32) == Xor(Step(h, b), a as bv32)
    ensures a == b
  {
    hide Step, Xor, TurnXor;
    RawStepXor(h, a, b);
    RawStepXor(h, b, a);
    RawOrder(h, a, b);
  }

  lemma RawStepXor(h: bv32, a: bv8, b: bv8)
    ensures Xor(Step(h, a), b as bv32) == TurnXor(h, a, b)
  {
    calc {
      Xor(Step(h, a), b as bv32);
      Xor(((h ^ (a as bv32)) << 5) | ((h ^ (a as bv32)) >> 27), b as bv32);
      (((h ^ (a as bv32)) << 5) | ((h ^ (a as bv32)) >> 27)) ^ (b as bv32);
      TurnXor(h, a, b);
    }
  }

  lemma KnownAnswers()
    ensures Hash([]) == 0x5555_5555
    ensures Hash([0x61, 0x62]) == 0x5554_dd15
    ensures Hash([0x62, 0x61]) == 0x5554_d175
  {
    FoldTwo(SEED, 0x61, 0x62);
    FoldTwo(SEED, 0x62, 0x61);
    assert Step(0x5555_5555, 0x61) == 0xaaaa_a68a;
    assert Step(0x5555_5555, 0x62) == 0xaaaa_a6ea;
    assert Step(0xaaaa_a68a, 0x62) == 0x5554_dd15;
    assert Step(0xaaaa_a6ea, 0x61) == 0x5554_d175;
  }
}
